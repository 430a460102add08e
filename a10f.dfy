/**
 * A10F: a converging tee of a rectangular main with a branch of half its
 * area. The branch and main coefficients come from two tables, each read
 * in table order; several rows are located and then not used.
 */
module A10F {
  import opened Wrappers
  import opened Lookup
  import opened Pipeline

  /** A10F projected on (PATH, Vc, Qb/Qc, C). */
  datatype BranchRow = BranchRow(path: string, vc: real, qbQc: real, c: real)

  /** A10M projected on (PATH, As/Ac, Ab/Ac, Qb/Qs, C). */
  datatype MainRow = MainRow(path: string, asAc: real, abAc: real, qbQs: real, c: real)

  /** The least Qb/Qs the table covers. */
  const MIN_QB_QS: real := 0.4

  /** The rows whose PATH is exactly "branch". */
  function Branches(table: seq<BranchRow>): (s: seq<BranchRow>)
    ensures forall x :: x in s <==> x in table && x.path == "branch"
  {
    Where(table, (r: BranchRow) => r.path == "branch")
  }

  /** The rows whose PATH is exactly "main". */
  function Mains(table: seq<MainRow>): (s: seq<MainRow>)
    ensures forall x :: x in s <==> x in table && x.path == "main"
  {
    Where(table, (r: MainRow) => r.path == "main")
  }

  /** The C of the first row (in table order) with Qb/Qc at least `ratio`, else of the last row. */
  function BranchCoefficient(rows: seq<BranchRow>, ratio: real): (c: real)
    requires |rows| > 0
    ensures (exists j :: 0 <= j < |rows| && rows[j].qbQc >= ratio) ==>
      exists i :: (0 <= i < |rows| && rows[i].c == c && rows[i].qbQc >= ratio &&
                   forall j :: 0 <= j < i ==> rows[j].qbQc < ratio)
    ensures (forall j :: 0 <= j < |rows| ==> rows[j].qbQc < ratio) ==> c == rows[|rows| - 1].c
  {
    rows[FirstOrLast(rows, (r: BranchRow) => r.qbQc >= ratio)].c
  }

  /** The C of the last row (in table order) with Qb/Qs at most `ratio`, else of the first row. */
  function MainCoefficient(rows: seq<MainRow>, ratio: real): (c: real)
    requires |rows| > 0
    ensures (exists j :: 0 <= j < |rows| && rows[j].qbQs <= ratio) ==>
      exists i :: (0 <= i < |rows| && rows[i].c == c && rows[i].qbQs <= ratio &&
                   forall j :: i < j < |rows| ==> rows[j].qbQs > ratio)
    ensures (forall j :: 0 <= j < |rows| ==> rows[j].qbQs > ratio) ==> c == rows[0].c
  {
    rows[LastOrFirst(rows, (r: MainRow) => r.qbQs <= ratio)].c
  }

  /** Main height H, width W (in), source flow Qs and branch flow Qb (cfm); a zero counts as missing. */
  function Outputs(h: Option<real>, w: Option<real>, qs: Option<real>, qb: Option<real>,
                   branchTable: seq<BranchRow>, mainTable: seq<MainRow>): (r: Outcome<BranchMain>)
    ensures r == Failed(MissingInput) <==> AnyFalsy([h, w, qs, qb])
    ensures !AnyFalsy([h, w, qs, qb]) ==> r == Compute(h.value, w.value, qs.value, qb.value, branchTable, mainTable)
  {
    if AnyFalsy([h, w, qs, qb]) then Failed(MissingInput)
    else Compute(h.value, w.value, qs.value, qb.value, branchTable, mainTable)
  }

  /**
   * The routine once every input is present and non-zero. The converged
   * flow is Qs + Qb; a Qb/Qs below 0.4 is refused before any table is
   * read. An empty branch or main selection fails while locating the
   * unused Vc and As/Ac rows.
   */
  function Compute(h: real, w: real, qs: real, qb: real,
                   branchTable: seq<BranchRow>, mainTable: seq<MainRow>): (r: Outcome<BranchMain>)
    requires h != 0.0 && w != 0.0 && qs != 0.0 && qb != 0.0
    ensures r.Done? || r == Failed(Raised) || r == Failed(InvalidGeometry)
    ensures qs + qb == 0.0 ==> r == Failed(Raised)
    ensures qs + qb != 0.0 ==>
      (r == Failed(InvalidGeometry) <==> qb / qs < MIN_QB_QS) &&
      (r == Failed(Raised) <==> qb / qs >= MIN_QB_QS && (|Branches(branchTable)| == 0 || |Mains(mainTable)| == 0))
    ensures r.Done? ==>
      qs + qb != 0.0 && |Branches(branchTable)| > 0 && |Mains(mainTable)| > 0 &&
      BranchMainConsistent(r.out, OnSource) &&
      r.out.branch.velocity == Velocity(qb, RectArea(h, w) / 2.0) &&
      r.out.sourceVelocity == Velocity(qs, RectArea(h, w)) &&
      r.out.convergedVelocity == Velocity(qs + qb, RectArea(h, w)) &&
      r.out.branch.coefficient == BranchCoefficient(Branches(branchTable), qb / (qs + qb)) &&
      r.out.mainCoefficient == MainCoefficient(Mains(mainTable), qb / qs)
  {
    if qs + qb == 0.0 then
      // Qb / Qc divides by zero
      Failed(Raised)
    else if qb / qs < MIN_QB_QS then Failed(InvalidGeometry)
    else if |Branches(branchTable)| == 0 || |Mains(mainTable)| == 0 then
      // `iloc[0]` of no branch rows, `idxmin` of no main rows
      Failed(Raised)
    else
      var a := RectArea(h, w);
      Done(BranchMainOf(Velocity(qb, a / 2.0), BranchCoefficient(Branches(branchTable), qb / (qs + qb)),
                        Velocity(qs, a), Velocity(qs + qb, a), MainCoefficient(Mains(mainTable), qb / qs), OnSource))
  }
}
