/**
 * A11W: a symmetrical dovetail wye. The branch area is a chosen fraction
 * of the main's, the converged flow splits evenly, and the coefficient is
 * read from the row whose area fraction agrees to four decimals.
 */
module A11W {
  import opened Wrappers
  import opened Lookup
  import opened Pipeline
  import Numeric

  /** A11W projected on (A_1b/Ac or A_2b/Ac, C). */
  datatype Row = Row(ratio: real, c: real)

  /** Units of the fourth decimal place per unit. */
  const SCALE: real := 10000.0

  /** `round(x, 4)` on exact values: the nearest multiple of 0.0001, ties to even. */
  function Round4(x: real): (r: real)
    ensures -0.00005 <= r - x <= 0.00005
    ensures r * SCALE == (r * SCALE).Floor as real
    ensures r - x == 0.00005 || x - r == 0.00005 ==> (r * SCALE).Floor % 2 == 0
  {
    (Numeric.RoundHalfEven(x * SCALE) as real) / SCALE
  }

  /** A rounded value rounds to itself. */
  lemma Round4Idempotent(x: real)
    ensures Round4(Round4(x)) == Round4(x)
  {
    var n := Numeric.RoundHalfEven(x * SCALE);
    var r := (n as real) / SCALE;
    assert r * SCALE == n as real;
    assert (r * SCALE).Floor == n;
  }

  /** Two values equal after rounding differ by at most one unit of the fourth decimal. */
  lemma RoundedEqualClose(a: real, b: real)
    requires Round4(a) == Round4(b)
    ensures -0.0001 <= a - b <= 0.0001
  {
  }

  /** The C of the first row whose area fraction rounds like `ratio`; `None` when none does. */
  function MatchCoefficient(rows: seq<Row>, ratio: real): (c: Option<real>)
    ensures c.None? <==> forall j :: 0 <= j < |rows| ==> Round4(rows[j].ratio) != Round4(ratio)
    ensures c.Some? ==>
      exists i :: (0 <= i < |rows| && rows[i].c == c.value && Round4(rows[i].ratio) == Round4(ratio) &&
                   forall j :: 0 <= j < i ==> Round4(rows[j].ratio) != Round4(ratio))
  {
    match First(rows, (r: Row) => Round4(r.ratio) == Round4(ratio))
    case Some(i) => Some(rows[i].c)
    case None => None
  }

  /** Branch area in square inches: the fraction `ratio` of the H by Wc main. */
  function BranchArea(ratio: real, h: real, wc: real): (a: real)
    ensures ratio != 0.0 && RectArea(h, wc) != 0.0 ==> a != 0.0
  {
    ratio * RectArea(h, wc)
  }

  /**
   * Main height H and width Wc (in), the branch area fraction Ab/Ac and
   * the converged flow Qc (cfm). Zero is an accepted value.
   */
  function Outputs(h: Option<real>, wc: Option<real>, ratio: Option<real>, qc: Option<real>,
                   rows: seq<Row>): (r: Outcome<DualBranch>)
    ensures r == Failed(MissingInput) <==> AnyNone([h, wc, ratio, qc])
    ensures !AnyNone([h, wc, ratio, qc]) ==> r == Compute(h.value, wc.value, ratio.value, qc.value, rows)
  {
    if AnyNone([h, wc, ratio, qc]) then Failed(MissingInput)
    else Compute(h.value, wc.value, ratio.value, qc.value, rows)
  }

  /**
   * The routine once every input is present. Each branch carries half the
   * converged flow; the two branches report the same values. A single
   * A11W row is read by `data.loc` as a Series, whose cell cannot be
   * compared as a column, and the handler reports the exception.
   */
  function Compute(h: real, wc: real, ratio: real, qc: real, rows: seq<Row>): (r: Outcome<DualBranch>)
    ensures r.Done? || r == Failed(Raised) || r == Failed(NoMatch)
    ensures r == Failed(Raised) <==> RectArea(h, wc) == 0.0 || ratio == 0.0 || |rows| == 1
    ensures r == Failed(NoMatch) <==>
      RectArea(h, wc) != 0.0 && ratio != 0.0 && |rows| != 1 && MatchCoefficient(rows, ratio).None?
    ensures r.Done? ==>
      RectArea(h, wc) != 0.0 && ratio != 0.0 && |rows| > 1 && MatchCoefficient(rows, ratio).Some? &&
      r.out.branch1 == r.out.branch2 && Consistent(r.out.branch1) &&
      r.out.branch1.velocity == Velocity(qc / 2.0, BranchArea(ratio, h, wc)) &&
      r.out.branch1.coefficient == MatchCoefficient(rows, ratio).value &&
      r.out.mainVelocity == Velocity(qc, RectArea(h, wc)) &&
      r.out.mainVelocityPressure == VelocityPressure(r.out.mainVelocity)
  {
    if RectArea(h, wc) == 0.0 || ratio == 0.0 then
      // Qc / A_main or (Qc / 2) / A_branch: ZeroDivisionError, caught
      Failed(Raised)
    else if |rows| == 1 then
      // a single A11W row read as a Series: indexing it with the
      // comparison's boolean raises, caught
      Failed(Raised)
    else
      match MatchCoefficient(rows, ratio)
      case None => Failed(NoMatch)
      case Some(c) =>
        var vc := Velocity(qc, RectArea(h, wc));
        var branch := StandardOf(Velocity(qc / 2.0, BranchArea(ratio, h, wc)), c);
        Done(DualBranch(branch, branch, vc, VelocityPressure(vc)))
  }
}
