/**
 * A11V: a diverging rectangular wye of common height H. Branch and main
 * coefficients come from one rule applied to each path's rows: the row
 * nearest in Ab/As, then in Ab/Ac, then in Qb/Qc, where above a Qb/Qc of
 * 0.7 only rows at or above the duct's share count as near.
 */
module A11V {
  import opened Wrappers
  import opened Lookup
  import opened Pipeline

  /** A11V projected on (PATH, Ab/As, Ab/Ac, Qb/Qc, C). */
  datatype Row = Row(path: string, abAs: real, abAc: real, qbQc: real, c: real)

  /** At or below this Qb/Qc the flow-share difference is two-sided. */
  const TWO_SIDED_LIMIT: real := 0.7

  function PathRows(table: seq<Row>, path: string): (s: seq<Row>)
    ensures forall x :: x in s <==> x in table && x.path == path
  {
    Where(table, (r: Row) => r.path == path)
  }

  /** The Qb/Qc difference: `|x - t|` up to 0.7, one-sided above. */
  function ShareDifference(x: real, t: real): (d: Ext)
    ensures t <= TWO_SIDED_LIMIT ==> d == Fin(Dist(x, t))
    ensures t > TWO_SIDED_LIMIT ==> d == Directional(x, t)
  {
    if t <= TWO_SIDED_LIMIT then Fin(Dist(x, t)) else Directional(x, t)
  }

  /** The three-column sort key of a row. */
  function Key(abAs: real, abAc: real, qbQc: real): Row -> seq<Ext> {
    (r: Row) => [Fin(Dist(r.abAs, abAs)), Fin(Dist(r.abAc, abAc)), ShareDifference(r.qbQc, qbQc)]
  }

  /**
   * The first row after a stable sort on the key: nearest in Ab/As; among
   * those tied with it there, nearest in Ab/Ac; among those tied on both,
   * nearest in Qb/Qc up to 0.7 and, above, at or above the duct's share
   * with the least excess whenever one of them is. No earlier row carries
   * the same key.
   */
  function Pick(rows: seq<Row>, abAs: real, abAc: real, qbQc: real): (i: nat)
    requires |rows| > 0
    ensures i < |rows|
    ensures forall j :: 0 <= j < |rows| ==> Dist(rows[i].abAs, abAs) <= Dist(rows[j].abAs, abAs)
    ensures forall j :: 0 <= j < |rows| && Dist(rows[j].abAs, abAs) == Dist(rows[i].abAs, abAs) ==>
      Dist(rows[i].abAc, abAc) <= Dist(rows[j].abAc, abAc)
    ensures forall j :: 0 <= j < |rows| && Dist(rows[j].abAs, abAs) == Dist(rows[i].abAs, abAs) &&
                        Dist(rows[j].abAc, abAc) == Dist(rows[i].abAc, abAc) ==>
      (qbQc <= TWO_SIDED_LIMIT ==> Dist(rows[i].qbQc, qbQc) <= Dist(rows[j].qbQc, qbQc)) &&
      (qbQc > TWO_SIDED_LIMIT && rows[j].qbQc >= qbQc ==> rows[i].qbQc >= qbQc && rows[i].qbQc <= rows[j].qbQc)
    ensures forall j :: 0 <= j < i ==> Key(abAs, abAc, qbQc)(rows[j]) != Key(abAs, abAc, qbQc)(rows[i])
  {
    var key := Key(abAs, abAc, qbQc);
    var i := FirstLeast(rows, Everything(), key).value;
    forall j | 0 <= j < |rows|
      ensures Dist(rows[i].abAs, abAs) <= Dist(rows[j].abAs, abAs)
      ensures Dist(rows[j].abAs, abAs) == Dist(rows[i].abAs, abAs) ==> Dist(rows[i].abAc, abAc) <= Dist(rows[j].abAc, abAc)
      ensures Dist(rows[j].abAs, abAs) == Dist(rows[i].abAs, abAs) && Dist(rows[j].abAc, abAc) == Dist(rows[i].abAc, abAc) ==>
        !ExtLess(ShareDifference(rows[j].qbQc, qbQc), ShareDifference(rows[i].qbQc, qbQc))
    {
      TripleLess(Fin(Dist(rows[j].abAs, abAs)), Fin(Dist(rows[j].abAc, abAc)), ShareDifference(rows[j].qbQc, qbQc),
                 Fin(Dist(rows[i].abAs, abAs)), Fin(Dist(rows[i].abAc, abAc)), ShareDifference(rows[i].qbQc, qbQc));
    }
    forall j | 0 <= j < |rows| && qbQc > TWO_SIDED_LIMIT && rows[j].qbQc >= qbQc
      ensures !ExtLess(Directional(rows[j].qbQc, qbQc), Directional(rows[i].qbQc, qbQc)) ==>
        rows[i].qbQc >= qbQc && rows[i].qbQc <= rows[j].qbQc
    {
      DirectionalLess(rows[j].qbQc, rows[i].qbQc, qbQc);
    }
    forall j | 0 <= j < i ensures key(rows[j]) != key(rows[i]) {
      LexIrreflexive(key(rows[i]));
    }
    i
  }

  /** A zero area of any of the three openings, or no converged flow: a division by zero. */
  predicate DividesByZero(h: real, wc: real, wb: real, ws: real, qc: real) {
    RectArea(h, wc) == 0.0 || RectArea(h, wb) == 0.0 || RectArea(h, ws) == 0.0 || qc == 0.0
  }

  /** The routine's failures, all raised: a division by zero, or a path without rows. */
  predicate Fails(h: real, wc: real, wb: real, ws: real, qc: real, table: seq<Row>) {
    DividesByZero(h, wc, wb, ws, qc) || |PathRows(table, "branch")| == 0 || |PathRows(table, "main")| == 0
  }

  /** The C of the rule's row among the rows of `path`. */
  function PathCoefficient(table: seq<Row>, path: string, h: real, wc: real, wb: real, ws: real, qc: real, qb: real): real
    requires !DividesByZero(h, wc, wb, ws, qc) && |PathRows(table, path)| > 0
  {
    var rows := PathRows(table, path);
    rows[Pick(rows, RectArea(h, wb) / RectArea(h, ws), RectArea(h, wb) / RectArea(h, wc), qb / qc)].c
  }

  /**
   * Height H, upstream width Wc, branch width Wb, downstream width Ws
   * (in), converged flow Qc and branch flow Qb (cfm). Zero is an accepted
   * value.
   */
  function Outputs(h: Option<real>, wc: Option<real>, wb: Option<real>, ws: Option<real>,
                   qc: Option<real>, qb: Option<real>, table: seq<Row>): (r: Outcome<BranchMain>)
    ensures r == Failed(MissingInput) <==> AnyNone([h, wc, wb, ws, qc, qb])
    ensures !AnyNone([h, wc, wb, ws, qc, qb]) ==>
      r == Compute(h.value, wc.value, wb.value, ws.value, qc.value, qb.value, table)
  {
    if AnyNone([h, wc, wb, ws, qc, qb]) then Failed(MissingInput)
    else Compute(h.value, wc.value, wb.value, ws.value, qc.value, qb.value, table)
  }

  /**
   * The routine once every input is present. The area ratios are taken
   * from the square-inch areas; the source flow Qc - Qb runs through the
   * downstream area and the main loss uses its velocity pressure. A
   * single A11V row is read by `data.loc` as a Series; selecting its
   * branch rows then raises a `KeyError`, which the routine reports as
   * branch data not found.
   */
  function Compute(h: real, wc: real, wb: real, ws: real, qc: real, qb: real, table: seq<Row>): (r: Outcome<BranchMain>)
    ensures r.Done? || r == Failed(Raised) || r == Failed(NoData)
    ensures r == Failed(NoData) <==> !DividesByZero(h, wc, wb, ws, qc) && |table| == 1
    ensures r == Failed(Raised) <==> DividesByZero(h, wc, wb, ws, qc) || (|table| != 1 && Fails(h, wc, wb, ws, qc, table))
    ensures r.Done? ==>
      !Fails(h, wc, wb, ws, qc, table) && |table| > 1 &&
      BranchMainConsistent(r.out, OnSource) &&
      r.out.branch.velocity == Velocity(qb, RectArea(h, wb)) &&
      r.out.sourceVelocity == Velocity(qc - qb, RectArea(h, ws)) &&
      r.out.convergedVelocity == Velocity(qc, RectArea(h, wc)) &&
      r.out.branch.coefficient == PathCoefficient(table, "branch", h, wc, wb, ws, qc, qb) &&
      r.out.mainCoefficient == PathCoefficient(table, "main", h, wc, wb, ws, qc, qb)
  {
    if DividesByZero(h, wc, wb, ws, qc) then
      // a ZeroDivisionError, caught
      Failed(Raised)
    else if |table| == 1 then
      // `data.loc` of a single row is a Series: "A11V branch data not found."
      Failed(NoData)
    else if Fails(h, wc, wb, ws, qc, table) then
      // `iloc[0]` of a path without rows; caught
      Failed(Raised)
    else
      Done(BranchMainOf(Velocity(qb, RectArea(h, wb)), PathCoefficient(table, "branch", h, wc, wb, ws, qc, qb),
                        Velocity(qc - qb, RectArea(h, ws)), Velocity(qc, RectArea(h, wc)),
                        PathCoefficient(table, "main", h, wc, wb, ws, qc, qb), OnSource))
  }
}
