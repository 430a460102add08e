/**
 * A11Q: a diverging rectangular tee with a branch of its own height. The
 * branch coefficient is read at the row closest above the duct's Vb/Vc and
 * then Qb/Qc, rows below either ratio ranking last on it; the main
 * coefficient is read at the nearest Vs/Vc of the A11R main rows. A
 * branch nearly as tall as the main adds a warning.
 */
module A11Q {
  import opened Wrappers
  import opened Lookup
  import opened Pipeline

  /** A11Q branch rows projected on (PATH, Vb/Vc, Qb/Qc, C). */
  datatype BranchRow = BranchRow(path: string, vbVc: real, qbQc: real, c: real)

  /** A11R rows projected on (PATH, Vs/Vc, C). */
  datatype MainRow = MainRow(path: string, vsVc: real, c: real)

  function VsVc(r: MainRow): real { r.vsVc }

  const HEIGHT_WARNING: string := "Warning: Branch height should be at least 2 inches smaller than main height."

  /** The branch height must stay this many inches below the main's. */
  const HEIGHT_MARGIN: real := 2.0

  function Branches(table: seq<BranchRow>): (s: seq<BranchRow>)
    ensures forall x :: x in s <==> x in table && x.path == "branch"
  {
    Where(table, (r: BranchRow) => r.path == "branch")
  }

  function Mains(table: seq<MainRow>): (s: seq<MainRow>)
    ensures forall x :: x in s <==> x in table && x.path == "main"
  {
    Where(table, (r: MainRow) => r.path == "main")
  }

  /** The (Vb/Vc, Qb/Qc) sort key of a branch row: one-sided differences. */
  function BranchKey(vbVc: real, qbQc: real): BranchRow -> seq<Ext> {
    (r: BranchRow) => [Directional(r.vbVc, vbVc), Directional(r.qbQc, qbQc)]
  }

  /**
   * The first branch row after a stable sort on the key. It reaches Vb/Vc
   * with the least excess whenever some row does; among the rows tied with
   * it on Vb/Vc it reaches Qb/Qc with the least excess whenever one of
   * them does; and no earlier row carries the same key.
   */
  function BranchPick(rows: seq<BranchRow>, vbVc: real, qbQc: real): (i: nat)
    requires |rows| > 0
    ensures i < |rows|
    ensures (exists j :: 0 <= j < |rows| && rows[j].vbVc >= vbVc) ==>
      rows[i].vbVc >= vbVc &&
      forall j :: 0 <= j < |rows| && rows[j].vbVc >= vbVc ==> rows[i].vbVc <= rows[j].vbVc
    ensures forall j :: 0 <= j < |rows| && Directional(rows[j].vbVc, vbVc) == Directional(rows[i].vbVc, vbVc) &&
                        rows[j].qbQc >= qbQc ==>
      rows[i].qbQc >= qbQc && rows[i].qbQc <= rows[j].qbQc
    ensures forall j :: 0 <= j < i ==> BranchKey(vbVc, qbQc)(rows[j]) != BranchKey(vbVc, qbQc)(rows[i])
  {
    var key := BranchKey(vbVc, qbQc);
    var i := FirstLeast(rows, Everything(), key).value;
    forall j | 0 <= j < |rows|
      ensures !ExtLess(Directional(rows[j].vbVc, vbVc), Directional(rows[i].vbVc, vbVc))
      ensures Directional(rows[j].vbVc, vbVc) == Directional(rows[i].vbVc, vbVc) ==>
        !ExtLess(Directional(rows[j].qbQc, qbQc), Directional(rows[i].qbQc, qbQc))
    {
      PairLess(Directional(rows[j].vbVc, vbVc), Directional(rows[j].qbQc, qbQc),
               Directional(rows[i].vbVc, vbVc), Directional(rows[i].qbQc, qbQc));
    }
    forall j | 0 <= j < |rows| && rows[j].vbVc >= vbVc ensures rows[i].vbVc >= vbVc && rows[i].vbVc <= rows[j].vbVc {
      DirectionalLess(rows[j].vbVc, rows[i].vbVc, vbVc);
    }
    forall j | 0 <= j < |rows| && Directional(rows[j].vbVc, vbVc) == Directional(rows[i].vbVc, vbVc) && rows[j].qbQc >= qbQc
      ensures rows[i].qbQc >= qbQc && rows[i].qbQc <= rows[j].qbQc
    {
      DirectionalLess(rows[j].qbQc, rows[i].qbQc, qbQc);
    }
    forall j | 0 <= j < i ensures key(rows[j]) != key(rows[i]) {
      LexIrreflexive(key(rows[i]));
    }
    i
  }

  /** The C of the first main row of least distance from `vsVc`. */
  function MainCoefficient(rows: seq<MainRow>, vsVc: real): (c: real)
    requires |rows| > 0
    ensures exists i :: (0 <= i < |rows| && rows[i].c == c &&
                         (forall j :: 0 <= j < |rows| ==> Dist(rows[i].vsVc, vsVc) <= Dist(rows[j].vsVc, vsVc)) &&
                         forall j :: 0 <= j < i ==> Dist(rows[i].vsVc, vsVc) < Dist(rows[j].vsVc, vsVc))
  {
    rows[NearestRow(rows, VsVc, vsVc)].c
  }

  /** A zero main or branch area, or no converged flow: a division by zero. */
  predicate DividesByZero(hm: real, wm: real, hb: real, wb: real, qc: real) {
    RectArea(hm, wm) == 0.0 || RectArea(hb, wb) == 0.0 || qc == 0.0
  }

  /** Vb/Vc. */
  function BranchSpeedRatio(hm: real, wm: real, hb: real, wb: real, qc: real, qb: real): real
    requires !DividesByZero(hm, wm, hb, wb, qc)
  {
    var vc := Velocity(qc, RectArea(hm, wm));
    assert vc != 0.0 by { assert vc * RectArea(hm, wm) == SQ_IN_PER_SQ_FT * qc; }
    Velocity(qb, RectArea(hb, wb)) / vc
  }

  /** Vs/Vc, the source flowing through the main's area. */
  function SourceSpeedRatio(hm: real, wm: real, hb: real, wb: real, qc: real, qb: real): real
    requires !DividesByZero(hm, wm, hb, wb, qc)
  {
    var vc := Velocity(qc, RectArea(hm, wm));
    assert vc != 0.0 by { assert vc * RectArea(hm, wm) == SQ_IN_PER_SQ_FT * qc; }
    Velocity(qc - qb, RectArea(hm, wm)) / vc
  }

  /**
   * Main height and width, branch height and width (in), converged flow
   * Qc and branch flow Qb (cfm). Zero is an accepted value.
   */
  function Outputs(hm: Option<real>, wm: Option<real>, hb: Option<real>, wb: Option<real>,
                   qc: Option<real>, qb: Option<real>,
                   branchTable: seq<BranchRow>, mainTable: seq<MainRow>): (r: Outcome<BranchMain>)
    ensures r == Failed(MissingInput) <==> AnyNone([hm, wm, hb, wb, qc, qb])
    ensures !AnyNone([hm, wm, hb, wb, qc, qb]) ==>
      r == Compute(hm.value, wm.value, hb.value, wb.value, qc.value, qb.value, branchTable, mainTable)
  {
    if AnyNone([hm, wm, hb, wb, qc, qb]) then Failed(MissingInput)
    else Compute(hm.value, wm.value, hb.value, wb.value, qc.value, qb.value, branchTable, mainTable)
  }

  /**
   * The routine once every input is present. The source flow Qc - Qb uses
   * the main's area; the main loss uses the source velocity pressure. The
   * warning rides along with the numbers and never replaces an error.
   */
  function Compute(hm: real, wm: real, hb: real, wb: real, qc: real, qb: real,
                   branchTable: seq<BranchRow>, mainTable: seq<MainRow>): (r: Outcome<BranchMain>)
    ensures r.Done? || r.Warned? || r == Failed(Raised) || r == Failed(NoData)
    ensures r == Failed(Raised) <==> DividesByZero(hm, wm, hb, wb, qc)
    ensures r == Failed(NoData) <==>
      !DividesByZero(hm, wm, hb, wb, qc) && (|Branches(branchTable)| == 0 || |Mains(mainTable)| == 0)
    ensures r.Warned? <==>
      !DividesByZero(hm, wm, hb, wb, qc) && |Branches(branchTable)| > 0 && |Mains(mainTable)| > 0 &&
      hb >= hm - HEIGHT_MARGIN
    ensures r.Warned? ==> r.warning == HEIGHT_WARNING
    ensures r.Done? || r.Warned? ==>
      !DividesByZero(hm, wm, hb, wb, qc) && |Branches(branchTable)| > 0 && |Mains(mainTable)| > 0 &&
      BranchMainConsistent(r.out, OnSource) &&
      r.out.branch.velocity == Velocity(qb, RectArea(hb, wb)) &&
      r.out.sourceVelocity == Velocity(qc - qb, RectArea(hm, wm)) &&
      r.out.convergedVelocity == Velocity(qc, RectArea(hm, wm)) &&
      r.out.branch.coefficient ==
        Branches(branchTable)[BranchPick(Branches(branchTable), BranchSpeedRatio(hm, wm, hb, wb, qc, qb), qb / qc)].c &&
      r.out.mainCoefficient == MainCoefficient(Mains(mainTable), SourceSpeedRatio(hm, wm, hb, wb, qc, qb))
  {
    if DividesByZero(hm, wm, hb, wb, qc) then
      // Qc / A_main, Qb / A_branch or Vb / Vc: ZeroDivisionError, caught
      Failed(Raised)
    else if |Branches(branchTable)| == 0 || |Mains(mainTable)| == 0 then Failed(NoData)
    else
      var out := BranchMainOf(Velocity(qb, RectArea(hb, wb)),
                              Branches(branchTable)[BranchPick(Branches(branchTable), BranchSpeedRatio(hm, wm, hb, wb, qc, qb), qb / qc)].c,
                              Velocity(qc - qb, RectArea(hm, wm)), Velocity(qc, RectArea(hm, wm)),
                              MainCoefficient(Mains(mainTable), SourceSpeedRatio(hm, wm, hb, wb, qc, qb)),
                              OnSource);
      if hb >= hm - HEIGHT_MARGIN then Warned(out, HEIGHT_WARNING) else Done(out)
  }
}
