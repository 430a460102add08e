/**
 * A10H: a converging rectangular wye of common height H. Each path's
 * coefficient is the first row of its PATH meeting three inequalities on
 * the area and flow ratios, with a fixed fallback row when none does.
 */
module A10H {
  import opened Wrappers
  import opened Lookup
  import opened Pipeline

  /** A10H projected on (PATH, Ab/As, As/Ac, Ab/Ac, Qb/Qc, C). */
  datatype Row = Row(path: string, abAs: real, asAc: real, abAc: real, qbQc: real, c: real)

  /** The rows whose PATH is exactly `name`. */
  function PathRows(table: seq<Row>, name: string): (s: seq<Row>)
    ensures forall x :: x in s <==> x in table && x.path == name
  {
    Where(table, (r: Row) => r.path == name)
  }

  /**
   * The C of the first branch row with Ab/As, Ab/Ac and Qb/Qc all at least
   * the duct's, else of the last branch row.
   */
  function BranchCoefficient(rows: seq<Row>, abAs: real, abAc: real, qbQc: real): (c: real)
    requires |rows| > 0
    ensures (exists j :: 0 <= j < |rows| && rows[j].abAs >= abAs && rows[j].abAc >= abAc && rows[j].qbQc >= qbQc) ==>
      exists i :: (0 <= i < |rows| && rows[i].c == c &&
                   rows[i].abAs >= abAs && rows[i].abAc >= abAc && rows[i].qbQc >= qbQc &&
                   forall j :: 0 <= j < i ==> !(rows[j].abAs >= abAs && rows[j].abAc >= abAc && rows[j].qbQc >= qbQc))
    ensures (forall j :: 0 <= j < |rows| ==> !(rows[j].abAs >= abAs && rows[j].abAc >= abAc && rows[j].qbQc >= qbQc)) ==>
      c == rows[|rows| - 1].c
  {
    rows[FirstOrLast(rows, (r: Row) => r.abAs >= abAs && r.abAc >= abAc && r.qbQc >= qbQc)].c
  }

  /**
   * The C of the first main row with As/Ac and Ab/Ac at least the duct's
   * and Qb/Qc at most the duct's, else of the first main row.
   */
  function MainCoefficient(rows: seq<Row>, asAc: real, abAc: real, qbQc: real): (c: real)
    requires |rows| > 0
    ensures (exists j :: 0 <= j < |rows| && rows[j].asAc >= asAc && rows[j].abAc >= abAc && rows[j].qbQc <= qbQc) ==>
      exists i :: (0 <= i < |rows| && rows[i].c == c &&
                   rows[i].asAc >= asAc && rows[i].abAc >= abAc && rows[i].qbQc <= qbQc &&
                   forall j :: 0 <= j < i ==> !(rows[j].asAc >= asAc && rows[j].abAc >= abAc && rows[j].qbQc <= qbQc))
    ensures (forall j :: 0 <= j < |rows| ==> !(rows[j].asAc >= asAc && rows[j].abAc >= abAc && rows[j].qbQc <= qbQc)) ==>
      c == rows[0].c
  {
    match First(rows, (r: Row) => r.asAc >= asAc && r.abAc >= abAc && r.qbQc <= qbQc)
    case Some(i) => rows[i].c
    case None => rows[0].c
  }

  /** The ratio of two areas of height `h` and widths `wa` and `wb`, both in square feet. */
  function WidthRatio(h: real, wa: real, wb: real): real
    requires h != 0.0 && wb != 0.0
  {
    (RectArea(h, wa) / SQ_IN_PER_SQ_FT) / (RectArea(h, wb) / SQ_IN_PER_SQ_FT)
  }

  /**
   * Height H, branch width Wb, source width Ws, converged width Wc (in),
   * source flow Qs and branch flow Qb (cfm); a zero counts as missing.
   */
  function Outputs(h: Option<real>, wb: Option<real>, ws: Option<real>, wc: Option<real>,
                   qs: Option<real>, qb: Option<real>, table: seq<Row>): (r: Outcome<BranchMain>)
    ensures r == Failed(MissingInput) <==> AnyFalsy([h, wb, ws, wc, qs, qb])
    ensures !AnyFalsy([h, wb, ws, wc, qs, qb]) ==>
      r == Compute(h.value, wb.value, ws.value, wc.value, qs.value, qb.value, table)
  {
    if AnyFalsy([h, wb, ws, wc, qs, qb]) then Failed(MissingInput)
    else Compute(h.value, wb.value, ws.value, wc.value, qs.value, qb.value, table)
  }

  /**
   * The routine once every input is present and non-zero. Qb/Qc divides
   * by Qs + Qb before any table is read; the branch rows are checked for
   * emptiness before the main rows. The main loss uses the source
   * velocity pressure.
   */
  function Compute(h: real, wb: real, ws: real, wc: real, qs: real, qb: real, table: seq<Row>): (r: Outcome<BranchMain>)
    requires h != 0.0 && wb != 0.0 && ws != 0.0 && wc != 0.0 && qs != 0.0 && qb != 0.0
    ensures r.Done? || r == Failed(Raised) || r == Failed(NoData)
    ensures r == Failed(Raised) <==> qs + qb == 0.0
    ensures r == Failed(NoData) <==>
      qs + qb != 0.0 && (|PathRows(table, "branch")| == 0 || |PathRows(table, "main")| == 0)
    ensures r.Done? ==>
      qs + qb != 0.0 && |PathRows(table, "branch")| > 0 && |PathRows(table, "main")| > 0 &&
      BranchMainConsistent(r.out, OnSource) &&
      r.out.branch.velocity == Velocity(qb, RectArea(h, wb)) &&
      r.out.sourceVelocity == Velocity(qs, RectArea(h, ws)) &&
      r.out.convergedVelocity == Velocity(qs + qb, RectArea(h, wc)) &&
      r.out.branch.coefficient ==
        BranchCoefficient(PathRows(table, "branch"), WidthRatio(h, wb, ws), WidthRatio(h, wb, wc), qb / (qs + qb)) &&
      r.out.mainCoefficient ==
        MainCoefficient(PathRows(table, "main"), WidthRatio(h, ws, wc), WidthRatio(h, wb, wc), qb / (qs + qb))
  {
    if qs + qb == 0.0 then
      // Qb / (Qs + Qb): ZeroDivisionError, caught
      Failed(Raised)
    else if |PathRows(table, "branch")| == 0 || |PathRows(table, "main")| == 0 then Failed(NoData)
    else
      Done(BranchMainOf(Velocity(qb, RectArea(h, wb)),
                        BranchCoefficient(PathRows(table, "branch"), WidthRatio(h, wb, ws), WidthRatio(h, wb, wc), qb / (qs + qb)),
                        Velocity(qs, RectArea(h, ws)), Velocity(qs + qb, RectArea(h, wc)),
                        MainCoefficient(PathRows(table, "main"), WidthRatio(h, ws, wc), WidthRatio(h, wb, wc), qb / (qs + qb)),
                        OnSource))
  }
}
