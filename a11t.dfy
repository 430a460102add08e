/**
 * A11T: a diverging rectangular tap of common height H. The branch
 * coefficient is read at the nearest Vb/Vc among the rows of the exact
 * angle; the main coefficient at the nearest Vs/Vc among the main rows of
 * the angle's group and, at 90 degrees, of the As/Ac band.
 */
module A11T {
  import opened Wrappers
  import opened Lookup
  import opened Pipeline

  /** A cell of a column that holds numbers on some rows and labels on others. */
  datatype Cell = Num(x: real) | Label(s: string)

  /**
   * A11T projected on (PATH, ANGLE, As/Ac, Vb/Vc, Vs/Vc, C). Branch rows
   * carry a numeric ANGLE; main rows carry the angle group and the As/Ac
   * band as labels.
   */
  datatype Row = Row(path: string, angle: Cell, band: string, vbVc: real, vsVc: real, c: real)

  function VbVc(r: Row): real { r.vbVc }
  function VsVc(r: Row): real { r.vsVc }

  /** The branch rows of exactly this angle. */
  function BranchRows(table: seq<Row>, angle: real): (s: seq<Row>)
    ensures forall x :: x in s <==> x in table && x.path == "branch" && x.angle == Num(angle)
  {
    Where(table, (r: Row) => r.path == "branch" && r.angle == Num(angle))
  }

  /** All main rows. */
  function MainRows(table: seq<Row>): (s: seq<Row>)
    ensures forall x :: x in s <==> x in table && x.path == "main"
  {
    Where(table, (r: Row) => r.path == "main")
  }

  /** The angle group label of the main rows: 15, 30, 45 and 60 share one; 90 has its own; others have none. */
  function AngleGroup(angle: real): (g: Option<string>)
    ensures g == Some("15-60") <==> angle == 15.0 || angle == 30.0 || angle == 45.0 || angle == 60.0
    ensures g == Some("90") <==> angle == 90.0
    ensures g.None? <==> !(angle == 15.0 || angle == 30.0 || angle == 45.0 || angle == 60.0 || angle == 90.0)
  {
    if angle == 15.0 || angle == 30.0 || angle == 45.0 || angle == 60.0 then Some("15-60")
    else if angle == 90.0 then Some("90")
    else None
  }

  /** The As/Ac band label used at 90 degrees; the gaps between the bands have none. */
  function Band(asAc: real): (b: Option<string>)
    ensures b.None? <==> asAc == 0.5 || asAc == 0.6 || 0.7 <= asAc < 0.8
    ensures b == Some("0-0.4") <==> asAc <= 0.4
    ensures b == Some(">=0.8") <==> asAc >= 0.8
  {
    if asAc <= 0.4 then Some("0-0.4")
    else if 0.4 < asAc < 0.5 then Some("0.5")
    else if 0.5 < asAc < 0.6 then Some("0.6")
    else if 0.6 < asAc < 0.7 then Some("0.7")
    else if asAc >= 0.8 then Some(">=0.8")
    else None
  }

  /**
   * The main rows kept for the angle and the area share: those of the
   * angle's group when it has one, and at 90 degrees those of the band
   * when As/Ac falls in one.
   */
  function MainGroup(mains: seq<Row>, angle: real, asAc: real): (s: seq<Row>)
    ensures forall x :: x in s <==>
      x in mains &&
      (AngleGroup(angle).Some? ==> x.angle == Label(AngleGroup(angle).value)) &&
      (angle == 90.0 && Band(asAc).Some? ==> x.band == Band(asAc).value)
  {
    match AngleGroup(angle)
    case None => mains
    case Some(g) =>
      var grouped := Where(mains, (r: Row) => r.angle == Label(g));
      if angle == 90.0 && Band(asAc).Some? then
        var b := Band(asAc).value;
        Where(grouped, (r: Row) => r.band == b)
      else grouped
  }

  /** The C of the first row of least distance between `key` and `t`. */
  function NearestCoefficient(rows: seq<Row>, key: Row -> real, t: real): (c: real)
    requires |rows| > 0
    ensures exists i :: (0 <= i < |rows| && rows[i].c == c &&
                         (forall j :: 0 <= j < |rows| ==> Dist(key(rows[i]), t) <= Dist(key(rows[j]), t)) &&
                         forall j :: 0 <= j < i ==> Dist(key(rows[i]), t) < Dist(key(rows[j]), t))
  {
    rows[NearestRow(rows, key, t)].c
  }

  /** A zero main or branch area, or no converged flow: a division by zero. */
  predicate DividesByZero(h: real, wm: real, wb: real, qc: real) {
    RectArea(h, wm) == 0.0 || RectArea(h, wb) == 0.0 || qc == 0.0
  }

  /** Vb/Vc. */
  function BranchSpeedRatio(h: real, wm: real, wb: real, qc: real, qb: real): real
    requires !DividesByZero(h, wm, wb, qc)
  {
    var vc := Velocity(qc, RectArea(h, wm));
    assert vc != 0.0 by { assert vc * RectArea(h, wm) == SQ_IN_PER_SQ_FT * qc; }
    Velocity(qb, RectArea(h, wb)) / vc
  }

  /** Vs/Vc, the source area being H (Wc - Wb). */
  function SourceSpeedRatio(h: real, wm: real, wb: real, qc: real, qb: real): real
    requires !DividesByZero(h, wm, wb, qc) && RectArea(h, wm - wb) > 0.0
  {
    var vc := Velocity(qc, RectArea(h, wm));
    assert vc != 0.0 by { assert vc * RectArea(h, wm) == SQ_IN_PER_SQ_FT * qc; }
    Velocity(qc - qb, RectArea(h, wm - wb)) / vc
  }

  /** As/Ac, both areas in square feet. */
  function AreaShare(h: real, wm: real, wb: real): real
    requires RectArea(h, wm) != 0.0
  {
    (RectArea(h, wm - wb) / SQ_IN_PER_SQ_FT) / (RectArea(h, wm) / SQ_IN_PER_SQ_FT)
  }

  /**
   * Height H, main width Wc, branch width Wb (in), converged flow Qc,
   * branch flow Qb (cfm) and ANGLE (deg). Zero is an accepted value.
   */
  function Outputs(h: Option<real>, wm: Option<real>, wb: Option<real>, qc: Option<real>, qb: Option<real>,
                   angle: Option<real>, table: seq<Row>): (r: Outcome<BranchMain>)
    ensures r == Failed(MissingInput) <==> AnyNone([h, wm, wb, qc, qb, angle])
    ensures !AnyNone([h, wm, wb, qc, qb, angle]) ==>
      r == Compute(h.value, wm.value, wb.value, qc.value, qb.value, angle.value, table)
  {
    if AnyNone([h, wm, wb, qc, qb, angle]) then Failed(MissingInput)
    else Compute(h.value, wm.value, wb.value, qc.value, qb.value, angle.value, table)
  }

  /**
   * The routine once every input is present. A source area at or below
   * zero is refused; then the divisions; then the branch rows of the
   * angle, the main rows, and the main rows of the group and band must
   * each be present. The main loss uses the source velocity pressure.
   */
  function Compute(h: real, wm: real, wb: real, qc: real, qb: real, angle: real, table: seq<Row>): (r: Outcome<BranchMain>)
    ensures r.Done? || r.Failed?
    ensures r == Failed(InvalidGeometry) <==> RectArea(h, wm - wb) <= 0.0
    ensures r == Failed(Raised) <==> RectArea(h, wm - wb) > 0.0 && DividesByZero(h, wm, wb, qc)
    ensures r == Failed(NoData) <==>
      RectArea(h, wm - wb) > 0.0 && !DividesByZero(h, wm, wb, qc) &&
      |BranchRows(table, angle)| > 0 && |MainRows(table)| == 0
    ensures r == Failed(NoMatch) <==>
      RectArea(h, wm - wb) > 0.0 && !DividesByZero(h, wm, wb, qc) &&
      (|BranchRows(table, angle)| == 0 ||
       (|MainRows(table)| > 0 && |MainGroup(MainRows(table), angle, AreaShare(h, wm, wb))| == 0))
    ensures r.Done? ==>
      RectArea(h, wm - wb) > 0.0 && !DividesByZero(h, wm, wb, qc) &&
      |BranchRows(table, angle)| > 0 &&
      |MainGroup(MainRows(table), angle, AreaShare(h, wm, wb))| > 0 &&
      BranchMainConsistent(r.out, OnSource) &&
      r.out.branch.velocity == Velocity(qb, RectArea(h, wb)) &&
      r.out.sourceVelocity == Velocity(qc - qb, RectArea(h, wm - wb)) &&
      r.out.convergedVelocity == Velocity(qc, RectArea(h, wm)) &&
      r.out.branch.coefficient ==
        NearestCoefficient(BranchRows(table, angle), VbVc, BranchSpeedRatio(h, wm, wb, qc, qb)) &&
      r.out.mainCoefficient ==
        NearestCoefficient(MainGroup(MainRows(table), angle, AreaShare(h, wm, wb)), VsVc, SourceSpeedRatio(h, wm, wb, qc, qb))
  {
    if RectArea(h, wm - wb) <= 0.0 then Failed(InvalidGeometry)
    else if DividesByZero(h, wm, wb, qc) then
      // Qc / A_main, Qb / A_branch or Vb / Vc: ZeroDivisionError, caught
      Failed(Raised)
    else if |BranchRows(table, angle)| == 0 then Failed(NoMatch)
    else if |MainRows(table)| == 0 then Failed(NoData)
    else if |MainGroup(MainRows(table), angle, AreaShare(h, wm, wb))| == 0 then Failed(NoMatch)
    else
      Done(BranchMainOf(Velocity(qb, RectArea(h, wb)),
                        NearestCoefficient(BranchRows(table, angle), VbVc, BranchSpeedRatio(h, wm, wb, qc, qb)),
                        Velocity(qc - qb, RectArea(h, wm - wb)), Velocity(qc, RectArea(h, wm)),
                        NearestCoefficient(MainGroup(MainRows(table), angle, AreaShare(h, wm, wb)), VsVc,
                                           SourceSpeedRatio(h, wm, wb, qc, qb)),
                        OnSource))
  }
}
