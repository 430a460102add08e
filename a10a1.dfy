/**
 * A10A1: a converging round wye. Each path's table is sorted on its
 * velocity ratio and then Ab/Ac; the row located by the velocity ratio is
 * never used, and the coefficient comes from the first sorted row whose
 * Ab/Ac reaches the duct's.
 */
module A10A1 {
  import opened Wrappers
  import opened Lookup
  import opened Pipeline

  /** A10A1 projected on (Vb/Vc, Ab/Ac, C). */
  datatype BranchRow = BranchRow(vbVc: real, abAc: real, c: real)

  /** A10A2 projected on (Vs/Vc, Ab/Ac, C). */
  datatype MainRow = MainRow(vsVc: real, abAc: real, c: real)

  function VbVc(r: BranchRow): real { r.vbVc }
  function BranchAbAc(r: BranchRow): real { r.abAc }
  function VsVc(r: MainRow): real { r.vsVc }
  function MainAbAc(r: MainRow): real { r.abAc }

  /**
   * Sort on (Vb/Vc, Ab/Ac); the first row with Ab/Ac at least the duct's,
   * else the last row. Read on the columns: the least Vb/Vc among the rows
   * reaching the Ab/Ac (then the least Ab/Ac), else the greatest row.
   */
  function BranchCoefficient(rows: seq<BranchRow>, abAc: real): (c: real)
    requires |rows| > 0
    ensures exists i :: (0 <= i < |rows| && rows[i].c == c &&
      ((exists j :: 0 <= j < |rows| && rows[j].abAc >= abAc) ==>
        rows[i].abAc >= abAc &&
        forall j :: 0 <= j < |rows| && rows[j].abAc >= abAc ==>
          rows[i].vbVc < rows[j].vbVc || (rows[i].vbVc == rows[j].vbVc && rows[i].abAc <= rows[j].abAc)) &&
      ((forall j :: 0 <= j < |rows| ==> rows[j].abAc < abAc) ==>
        forall j :: 0 <= j < |rows| ==>
          rows[j].vbVc < rows[i].vbVc || (rows[j].vbVc == rows[i].vbVc && rows[j].abAc <= rows[i].abAc)))
  {
    var p := (r: BranchRow) => r.abAc >= abAc;
    var i := SortedFirstOrLast(rows, p, ByKeys(VbVc, BranchAbAc));
    if exists j :: 0 <= j < |rows| && p(rows[j]) then
      FirstLeastByKeys(rows, p, VbVc, BranchAbAc, i);
      rows[i].c
    else
      LastGreatestByKeys(rows, Everything(), VbVc, BranchAbAc, i);
      rows[i].c
  }

  /** The same rule over the main table, sorted on (Vs/Vc, Ab/Ac). */
  function MainCoefficient(rows: seq<MainRow>, abAc: real): (c: real)
    requires |rows| > 0
    ensures exists i :: (0 <= i < |rows| && rows[i].c == c &&
      ((exists j :: 0 <= j < |rows| && rows[j].abAc >= abAc) ==>
        rows[i].abAc >= abAc &&
        forall j :: 0 <= j < |rows| && rows[j].abAc >= abAc ==>
          rows[i].vsVc < rows[j].vsVc || (rows[i].vsVc == rows[j].vsVc && rows[i].abAc <= rows[j].abAc)) &&
      ((forall j :: 0 <= j < |rows| ==> rows[j].abAc < abAc) ==>
        forall j :: 0 <= j < |rows| ==>
          rows[j].vsVc < rows[i].vsVc || (rows[j].vsVc == rows[i].vsVc && rows[j].abAc <= rows[i].abAc)))
  {
    var p := (r: MainRow) => r.abAc >= abAc;
    var i := SortedFirstOrLast(rows, p, ByKeys(VsVc, MainAbAc));
    if exists j :: 0 <= j < |rows| && p(rows[j]) then
      FirstLeastByKeys(rows, p, VsVc, MainAbAc, i);
      rows[i].c
    else
      LastGreatestByKeys(rows, Everything(), VsVc, MainAbAc, i);
      rows[i].c
  }

  /** Ab/Ac from the two diameters, both areas in square feet. */
  function AreaRatio(db: real, dm: real): real
    requires CircleArea(dm) != 0.0
  {
    (CircleArea(db) / SQ_IN_PER_SQ_FT) / (CircleArea(dm) / SQ_IN_PER_SQ_FT)
  }

  /** The failures, all raised: a zero area, no converged flow, or an empty table. */
  predicate Fails(dm: real, db: real, qs: real, qb: real, branch: seq<BranchRow>, main: seq<MainRow>) {
    CircleArea(db) == 0.0 || CircleArea(dm) == 0.0 || qs + qb == 0.0 || |branch| == 0 || |main| == 0
  }

  /**
   * Main diameter Dc, branch diameter Db (in), source flow Qs and branch
   * flow Qb (cfm). Only an absent input is missing; zero is accepted.
   */
  function Outputs(dm: Option<real>, db: Option<real>, qs: Option<real>, qb: Option<real>,
                   branch: seq<BranchRow>, main: seq<MainRow>): (r: Outcome<BranchMain>)
    ensures r == AllNone <==> AnyNone([dm, db, qs, qb])
    ensures !AnyNone([dm, db, qs, qb]) ==> r == Compute(dm.value, db.value, qs.value, qb.value, branch, main)
  {
    if AnyNone([dm, db, qs, qb]) then AllNone
    else Compute(dm.value, db.value, qs.value, qb.value, branch, main)
  }

  /**
   * The routine once every input is present; it has no exception handler.
   * Vb/Vc (zero converged velocity, i.e. Qs + Qb = 0, divides by zero) and
   * Vs/Vc only serve as sort keys; the main loss uses the source velocity
   * pressure.
   */
  function Compute(dm: real, db: real, qs: real, qb: real,
                   branch: seq<BranchRow>, main: seq<MainRow>): (r: Outcome<BranchMain>)
    ensures r.Done? || r == Failed(Uncaught)
    ensures r == Failed(Uncaught) <==> Fails(dm, db, qs, qb, branch, main)
    ensures r.Done? ==>
      !Fails(dm, db, qs, qb, branch, main) &&
      BranchMainConsistent(r.out, OnSource) &&
      r.out.branch.velocity == Velocity(qb, CircleArea(db)) &&
      r.out.sourceVelocity == Velocity(qs, CircleArea(dm)) &&
      r.out.convergedVelocity == Velocity(qs + qb, CircleArea(dm)) &&
      r.out.branch.coefficient == BranchCoefficient(branch, AreaRatio(db, dm)) &&
      r.out.mainCoefficient == MainCoefficient(main, AreaRatio(db, dm))
  {
    if Fails(dm, db, qs, qb, branch, main) then
      // ZeroDivisionError, or `iloc[-1]` of an empty table
      Failed(Uncaught)
    else
      Done(BranchMainOf(Velocity(qb, CircleArea(db)), BranchCoefficient(branch, AreaRatio(db, dm)),
                        Velocity(qs, CircleArea(dm)), Velocity(qs + qb, CircleArea(dm)),
                        MainCoefficient(main, AreaRatio(db, dm)), OnSource))
  }
}
